/**
 The packets of the UDP tracker protocol (BEP 15), byte for byte: what the server reads
 from requests, what it writes into replies, and what a client makes of either.
 */
module UdpPackets {
  import opened Bytes
  import opened Addresses
  import opened InfoHashes
  import opened Swarms
  import opened TorrentDbs
  import opened Records

  const CONNECT: uint32 := 0
  const ANNOUNCE: uint32 := 1
  const SCRAPE: uint32 := 2
  const ERROR: uint32 := 3

  /** Sizes of the packed request structures. */
  const CONNECT_REQUEST: nat := 16
  const ANNOUNCE_REQUEST: nat := 98

  const ANNOUNCE_HEADER: nat := 20
  const PEER_SLOT: nat := 6
  const SCRAPE_HEADER: nat := 8
  const ERROR_HEADER: nat := 8
  const CONNECT_REPLY: nat := 16
  const SCRAPE_SLOT: nat := 12
  const HASH_SIZE: nat := 20

  type Word = s: seq<byte> | |s| == 4 witness Zeroes(4)
  type HashBytes = s: seq<byte> | |s| == HASH_SIZE witness Zeroes(HASH_SIZE)

  // -------------------------------------------------------------------- requests, read

  /** The common head of all requests; the id is never byte-swapped by the server. */
  function IdOf(packet: seq<byte>): uint64
    requires |packet| >= CONNECT_REQUEST
  {
    Pow256Values(); FromHostOrder(packet[..8])
  }

  function ActionOf(packet: seq<byte>): uint32
    requires |packet| >= CONNECT_REQUEST
  {
    U32(packet[8..12])
  }

  function TransactionOf(packet: seq<byte>): Word
    requires |packet| >= CONNECT_REQUEST
  {
    packet[12..16]
  }

  /** The fields of an announce packet that the server looks at. */
  datatype AnnounceFields = AnnounceFields(
    infoHash: HashBytes,
    peerid: PeerId,
    downloaded: uint64,
    left: uint64,
    uploaded: uint64,
    event: uint32,
    ip: Ipv4,
    numWant: uint32,
    port: uint16)

  function ReadAnnounce(packet: seq<byte>): AnnounceFields
    requires |packet| >= ANNOUNCE_REQUEST
  {
    AnnounceFields(
      packet[16..36], packet[36..56],
      U64(packet[56..64]), U64(packet[64..72]), U64(packet[72..80]),
      U32(packet[80..84]), packet[84..88], U32(packet[92..96]), U16(packet[96..98]))
  }

  function RequestHead(id: uint64, action: uint32, transaction: Word): (part: seq<byte>)
    ensures |part| == CONNECT_REQUEST
  {
    HostOrder(id, 8) + BigEndian(action, 4) + transaction
  }

  function TransferPart(f: AnnounceFields): (part: seq<byte>)
    ensures |part| == 24
  {
    BigEndian(f.downloaded, 8) + BigEndian(f.left, 8) + BigEndian(f.uploaded, 8)
  }

  function WishPart(f: AnnounceFields, key: Word): (part: seq<byte>)
    ensures |part| == 18
  {
    BigEndian(f.event, 4) + f.ip + key + BigEndian(f.numWant, 4) + BigEndian(f.port, 2)
  }

  /** The announce request of BEP 15, field after field, as a client sends it. */
  function WriteAnnounce(id: uint64, transaction: Word, f: AnnounceFields, key: Word): (packet: seq<byte>)
    ensures |packet| == ANNOUNCE_REQUEST
  {
    RequestHead(id, ANNOUNCE, transaction) + (f.infoHash + f.peerid) + TransferPart(f) + WishPart(f, key)
  }

  lemma HeadRead(packet: seq<byte>, id: uint64, action: uint32, transaction: Word)
    requires |packet| >= CONNECT_REQUEST && packet[..16] == RequestHead(id, action, transaction)
    ensures IdOf(packet) == id && ActionOf(packet) == action && TransactionOf(packet) == transaction
  {
    hide BigEndian, HostOrder, FromBigEndian, FromHostOrder, U32;
    Pow256Values();
    HostOrderRoundTrip(id, 8);
    WordsRoundTrip(0, action, 0);
    var head := packet[..16];
    assert packet[..8] == head[..8] == HostOrder(id, 8);
    assert packet[8..12] == head[8..12] == BigEndian(action, 4);
    assert packet[12..16] == head[12..16] == transaction;
  }

  lemma TransferRead(part: seq<byte>, f: AnnounceFields)
    requires part == TransferPart(f)
    ensures U64(part[0..8]) == f.downloaded && U64(part[8..16]) == f.left && U64(part[16..24]) == f.uploaded
  {
    hide BigEndian, FromBigEndian, U64;
    WordsRoundTrip(0, 0, f.downloaded);
    WordsRoundTrip(0, 0, f.left);
    WordsRoundTrip(0, 0, f.uploaded);
    assert part[0..8] == BigEndian(f.downloaded, 8);
    assert part[8..16] == BigEndian(f.left, 8);
    assert part[16..24] == BigEndian(f.uploaded, 8);
  }

  lemma WishRead(part: seq<byte>, f: AnnounceFields, key: Word)
    requires part == WishPart(f, key)
    ensures U32(part[0..4]) == f.event && part[4..8] == f.ip
    ensures U32(part[12..16]) == f.numWant && U16(part[16..18]) == f.port
  {
    hide BigEndian, FromBigEndian, U16, U32;
    WordsRoundTrip(f.port, f.event, 0);
    WordsRoundTrip(f.port, f.numWant, 0);
    assert part[0..4] == BigEndian(f.event, 4);
    assert part[12..16] == BigEndian(f.numWant, 4);
    assert part[16..18] == BigEndian(f.port, 2);
  }

  /** The server reads back every field a client wrote. */
  lemma AnnounceRequestRoundTrip(id: uint64, transaction: Word, f: AnnounceFields, key: Word)
    ensures var packet := WriteAnnounce(id, transaction, f, key);
            && IdOf(packet) == id
            && ActionOf(packet) == ANNOUNCE
            && TransactionOf(packet) == transaction
            && ReadAnnounce(packet) == f
  {
    hide RequestHead, TransferPart, WishPart, U16, U32, U64, IdOf, ActionOf, TransactionOf;
    var packet := WriteAnnounce(id, transaction, f, key);
    assert packet[..16] == RequestHead(id, ANNOUNCE, transaction);
    HeadRead(packet, id, ANNOUNCE, transaction);
    var ids, transfer, wish := packet[16..56], packet[56..80], packet[80..98];
    assert ids == f.infoHash + f.peerid && transfer == TransferPart(f) && wish == WishPart(f, key);
    TransferRead(transfer, f);
    WishRead(wish, f, key);
    Subslice(packet, 16, 56, 0, 20);
    Subslice(packet, 16, 56, 20, 40);
    Subslice(packet, 56, 80, 0, 8);
    Subslice(packet, 56, 80, 8, 16);
    Subslice(packet, 56, 80, 16, 24);
    Subslice(packet, 80, 98, 0, 4);
    Subslice(packet, 80, 98, 4, 8);
    Subslice(packet, 80, 98, 12, 16);
    Subslice(packet, 80, 98, 16, 18);
  }

  /** The event numbers of BEP 15; anything else counts as no event. */
  function Convert(event: uint32): AnnounceKind {
    match event
    case 1 => Completed
    case 2 => Started
    case 3 => Stopped
    case _ => Plain
  }

  lemma HeadOnto(packet: seq<byte>)
    requires |packet| >= CONNECT_REQUEST
    ensures RequestHead(IdOf(packet), ActionOf(packet), TransactionOf(packet)) == packet[..16]
  {
    hide BigEndian, HostOrder, FromBigEndian, FromHostOrder, U32;
    HostOrderOnto(packet[..8]);
    WordsOnto(Zeroes(2), packet[8..12], Zeroes(8));
    assert packet[..16] == packet[..8] + packet[8..12] + packet[12..16];
  }

  lemma TransferOnto(packet: seq<byte>)
    requires |packet| >= ANNOUNCE_REQUEST
    ensures TransferPart(ReadAnnounce(packet)) == packet[56..80]
  {
    hide BigEndian, U16, U32, U64;
    WordsOnto(Zeroes(2), Zeroes(4), packet[56..64]);
    WordsOnto(Zeroes(2), Zeroes(4), packet[64..72]);
    WordsOnto(Zeroes(2), Zeroes(4), packet[72..80]);
    assert packet[56..80] == packet[56..64] + packet[64..72] + packet[72..80];
  }

  lemma WishOnto(packet: seq<byte>)
    requires |packet| == ANNOUNCE_REQUEST
    ensures WishPart(ReadAnnounce(packet), packet[88..92]) == packet[80..98]
  {
    hide BigEndian, U16, U32, U64;
    WordsOnto(packet[96..98], packet[80..84], Zeroes(8));
    WordsOnto(packet[96..98], packet[92..96], Zeroes(8));
    assert packet[80..98] == packet[80..84] + packet[84..88] + packet[88..92] + packet[92..96] + packet[96..98];
  }

  /**
   And nothing is lost in reading: an announce of the exact size is the one a client
   writes from the fields read, so two of them that read alike are the same bytes but
   for the `key` field.
   */
  lemma AnnounceRequestOnto(packet: seq<byte>)
    requires |packet| == ANNOUNCE_REQUEST && ActionOf(packet) == ANNOUNCE
    ensures WriteAnnounce(IdOf(packet), TransactionOf(packet), ReadAnnounce(packet), packet[88..92]) == packet
  {
    hide RequestHead, TransferPart, WishPart, U16, U32, U64, IdOf, ActionOf, TransactionOf;
    HeadOnto(packet);
    TransferOnto(packet);
    WishOnto(packet);
    assert packet == packet[..16] + (packet[16..36] + packet[36..56]) + packet[56..80] + packet[80..98];
  }

  /** The number BEP 15 gives to an event, written by clients. */
  function EventNumber(kind: AnnounceKind): uint32 {
    match kind
    case Plain => 0
    case Completed => 1
    case Started => 2
    case Stopped => 3
  }

  /** Every event a client writes is understood, and any other number is no event. */
  lemma EventsUnderstood(event: uint32, kind: AnnounceKind)
    ensures Convert(EventNumber(kind)) == kind
    ensures (forall k :: EventNumber(k) != event) ==> Convert(event).Plain?
  {
    assert event in {1, 2, 3} ==> event in {EventNumber(Completed), EventNumber(Started), EventNumber(Stopped)};
  }

  /** How many 20-byte hashes a scrape packet of this size holds. */
  function HashCount(packet: seq<byte>): nat
    requires |packet| >= CONNECT_REQUEST
  {
    (|packet| - CONNECT_REQUEST) / HASH_SIZE
  }

  function ScrapeHash(bytes: HashBytes): InfoHash {
    MakeInfoHash(Sha1, bytes)
  }

  /** The first `n` hashes of a scrape packet; all of them are read inside the packet. */
  function ScrapeHashes(packet: seq<byte>, n: nat): (hashes: seq<InfoHash>)
    requires |packet| >= CONNECT_REQUEST && n <= HashCount(packet)
    ensures |hashes| == n
  {
    seq(n, i requires 0 <= i < n =>
      assert (i + 1) * HASH_SIZE <= |packet[CONNECT_REQUEST..]|;
      ScrapeHash(RecordAt(packet[CONNECT_REQUEST..], HASH_SIZE, i)))
  }

  /** The server reads exactly the hashes a client appended, and ignores a ragged tail. */
  lemma ScrapeRequestRoundTrip(head: seq<byte>, hashes: seq<seq<byte>>, tail: seq<byte>, i: nat)
    requires |head| == CONNECT_REQUEST && AllOfSize(hashes, HASH_SIZE) && |tail| < HASH_SIZE
    requires i < |hashes|
    ensures var packet := head + Concat(hashes) + tail;
            && HashCount(packet) == |hashes|
            && ScrapeHashes(packet, |hashes|)[i].Significant() == hashes[i]
  {
    hide Concat, RecordAt, ScrapeHash;
    var joined := Concat(hashes);
    var packet := head + joined + tail;
    ConcatSize(hashes, HASH_SIZE);
    RecordsRecovered(hashes, HASH_SIZE, i);
    assert packet[CONNECT_REQUEST..] == joined + tail;
    RecordOfPrefix(joined, tail, HASH_SIZE, i);
    SignificantOfScrapeHash(hashes[i]);
  }

  lemma RecordOfPrefix(b: seq<byte>, tail: seq<byte>, size: nat, i: nat)
    requires (i + 1) * size <= |b|
    ensures (i + 1) * size <= |b + tail| && RecordAt(b + tail, size, i) == RecordAt(b, size, i)
  {
    assert i * size + size == (i + 1) * size;
  }

  lemma SignificantOfScrapeHash(bytes: HashBytes)
    ensures ScrapeHash(bytes).Significant() == bytes
  {
  }

  // ------------------------------------------------------------------ replies, as values

  function Head(action: uint32, transaction: Word): (head: seq<byte>)
    ensures |head| == 8
  {
    BigEndian(action, 4) + transaction
  }

  function ConnectReply(transaction: Word, id: uint64): seq<byte> {
    Head(CONNECT, transaction) + HostOrder(id, 8)
  }

  function Ascii(message: string): seq<byte> {
    seq(|message|, i requires 0 <= i < |message| => (message[i] as int) % 0x100)
  }

  function ErrorReply(transaction: Word, message: string): seq<byte> {
    Head(ERROR, transaction) + Ascii(message)
  }

  /** Six bytes a peer: IPv4 address and port; left blank for any other family. */
  function PeerSlot(a: Address): (slot: seq<byte>)
    ensures |slot| == PEER_SLOT
  {
    if a.family.Inet? then a.storage[..PEER_SLOT] else Zeroes(PEER_SLOT)
  }

  function PeerSlots(addrs: seq<Address>): (slots: seq<seq<byte>>)
    ensures |slots| == |addrs| && AllOfSize(slots, PEER_SLOT)
  {
    seq(|addrs|, i requires 0 <= i < |addrs| => PeerSlot(addrs[i]))
  }

  function AnnounceHead(transaction: Word, interval: uint32, leechers: uint32, seeders: uint32): (head: seq<byte>)
    ensures |head| == ANNOUNCE_HEADER
  {
    Head(ANNOUNCE, transaction) + BigEndian(interval, 4) + BigEndian(leechers, 4) + BigEndian(seeders, 4)
  }

  function AnnounceReply(transaction: Word, interval: uint32, reply: Reply): seq<byte> {
    AnnounceHead(transaction, interval, reply.leechers, reply.seeders) + Concat(PeerSlots(reply.addrs))
  }

  /** Twelve bytes an item: seeders, completed, leechers, in the order of BEP 15. */
  function ItemSlot(item: ScrapeItem): (slot: seq<byte>)
    ensures |slot| == SCRAPE_SLOT
  {
    BigEndian(item.seeders, 4) + BigEndian(item.downloaded, 4) + BigEndian(item.leechers, 4)
  }

  function ItemSlots(items: seq<ScrapeItem>): (slots: seq<seq<byte>>)
    ensures |slots| == |items| && AllOfSize(slots, SCRAPE_SLOT)
  {
    seq(|items|, i requires 0 <= i < |items| => ItemSlot(items[i]))
  }

  function ScrapeReply(transaction: Word, items: seq<ScrapeItem>): seq<byte> {
    Head(SCRAPE, transaction) + Concat(ItemSlots(items))
  }

  // -------------------------------------------------------------- replies, as clients see

  /** A 32-bit big-endian number at some offset. */
  function At32(data: seq<byte>, at: nat): uint32
    requires at + 4 <= |data|
  {
    U32(data[at..at + 4])
  }

  lemma HeadDecodes(action: uint32, transaction: Word, body: seq<byte>)
    ensures var data := Head(action, transaction) + body;
            At32(data, 0) == action && data[4..8] == transaction
  {
    var data := Head(action, transaction) + body;
    WordsRoundTrip(0, action, 0);
    assert data[0..4] == BigEndian(action, 4);
    assert data[4..8] == transaction;
  }

  /** The id a client finds in a connect reply, kept as the eight bytes it will send back. */
  function IdInReply(data: seq<byte>): uint64
    requires |data| >= CONNECT_REPLY
  {
    Pow256Values(); FromHostOrder(data[8..16])
  }

  /** A connect reply is 16 bytes: action 0, the transaction, and the id a client reads back. */
  lemma ConnectReplyTells(transaction: Word, id: uint64)
    ensures var data := ConnectReply(transaction, id);
            && |data| == 16
            && At32(data, 0) == 0
            && data[4..8] == transaction
            && IdInReply(data) == id
  {
    hide Head, At32;
    Pow256Values();
    HostOrderRoundTrip(id, 8);
    HeadDecodes(CONNECT, transaction, HostOrder(id, 8));
    assert ConnectReply(transaction, id)[8..16] == HostOrder(id, 8);
  }

  /** An error reply is action 3, the transaction, and the message, a byte a character. */
  lemma ErrorReplyTells(transaction: Word, message: string)
    ensures var data := ErrorReply(transaction, message);
            && |data| == 8 + |message|
            && At32(data, 0) == 3
            && data[4..8] == transaction
            && forall i :: 0 <= i < |message| && message[i] < 0x100 as char ==> data[8 + i] == message[i] as int
  {
    hide Head, At32;
    HeadDecodes(ERROR, transaction, Ascii(message));
  }

  /** The head of an announce reply decodes to its fields, for any reply. */
  lemma AnnounceReplyHead(transaction: Word, interval: uint32, reply: Reply)
    ensures var data := AnnounceReply(transaction, interval, reply);
            && |data| == ANNOUNCE_HEADER + PEER_SLOT * |reply.addrs|
            && At32(data, 0) == ANNOUNCE
            && data[4..8] == transaction
            && At32(data, 8) == interval
            && At32(data, 12) == reply.leechers
            && At32(data, 16) == reply.seeders
  {
    var data := AnnounceReply(transaction, interval, reply);
    ConcatSize(PeerSlots(reply.addrs), PEER_SLOT);
    WordsRoundTrip(0, ANNOUNCE, 0);
    WordsRoundTrip(0, interval, 0);
    WordsRoundTrip(0, reply.leechers, 0);
    WordsRoundTrip(0, reply.seeders, 0);
    assert data[0..4] == BigEndian(ANNOUNCE, 4);
    assert data[4..8] == transaction;
    assert data[8..12] == BigEndian(interval, 4);
    assert data[12..16] == BigEndian(reply.leechers, 4);
    assert data[16..20] == BigEndian(reply.seeders, 4);
  }

  /** The peers of an announce reply are 6-byte records; the i-th is the i-th slot. */
  lemma AnnounceReplyPeer(transaction: Word, interval: uint32, reply: Reply, i: nat)
    requires i < |reply.addrs|
    ensures var body := AnnounceReply(transaction, interval, reply)[ANNOUNCE_HEADER..];
            && |body| / PEER_SLOT == |reply.addrs|
            && (i + 1) * PEER_SLOT <= |body|
            && RecordAt(body, PEER_SLOT, i) == PeerSlot(reply.addrs[i])
  {
    var slots := PeerSlots(reply.addrs);
    assert AnnounceReply(transaction, interval, reply)[ANNOUNCE_HEADER..] == Concat(slots);
    RecordsRecovered(slots, PEER_SLOT, i);
    RecordCount(slots, PEER_SLOT);
  }

  /** A record tells the true address exactly when that address is IPv4. */
  lemma AnnounceReplyExact(transaction: Word, interval: uint32, reply: Reply, i: nat)
    requires i < |reply.addrs|
    ensures var body := AnnounceReply(transaction, interval, reply)[ANNOUNCE_HEADER..];
            && (i + 1) * PEER_SLOT <= |body|
            && (RecordAt(body, PEER_SLOT, i) == reply.addrs[i].Key() <==> reply.addrs[i].family.Inet?)
  {
    AnnounceReplyPeer(transaction, interval, reply, i);
    assert |PeerSlot(reply.addrs[i])| == PEER_SLOT;
  }

  /** The i-th triple of a scrape reply decodes to the counts of the i-th item. */
  lemma ScrapeReplyTriple(transaction: Word, items: seq<ScrapeItem>, i: nat)
    requires i < |items|
    ensures var data := ScrapeReply(transaction, items);
            var at := SCRAPE_HEADER + SCRAPE_SLOT * i;
            && |data| == SCRAPE_HEADER + SCRAPE_SLOT * |items|
            && at + SCRAPE_SLOT <= |data|
            && At32(data, 0) == SCRAPE && data[4..8] == transaction
            && At32(data, at) == items[i].seeders
            && At32(data, at + 4) == items[i].downloaded
            && At32(data, at + 8) == items[i].leechers
  {
    hide Concat, ItemSlot, BigEndian, U32;
    var slots := ItemSlots(items);
    var body, head := Concat(slots), Head(SCRAPE, transaction);
    var data := head + body;
    var at := SCRAPE_HEADER + SCRAPE_SLOT * i;
    RecordsRecovered(slots, SCRAPE_SLOT, i);
    WordsRoundTrip(0, SCRAPE, 0);
    assert data[0..4] == BigEndian(SCRAPE, 4) && data[4..8] == transaction;
    assert data[at..at + SCRAPE_SLOT] == RecordAt(body, SCRAPE_SLOT, i) == ItemSlot(items[i]);
    ItemRead(data[at..at + SCRAPE_SLOT], items[i]);
    Subslice(data, at, at + SCRAPE_SLOT, 0, 4);
    Subslice(data, at, at + SCRAPE_SLOT, 4, 8);
    Subslice(data, at, at + SCRAPE_SLOT, 8, 12);
  }

  lemma ItemRead(slot: seq<byte>, item: ScrapeItem)
    requires slot == ItemSlot(item)
    ensures U32(slot[0..4]) == item.seeders && U32(slot[4..8]) == item.downloaded
    ensures U32(slot[8..12]) == item.leechers
  {
    hide BigEndian, FromBigEndian, U32;
    WordsRoundTrip(0, item.seeders, 0);
    WordsRoundTrip(0, item.downloaded, 0);
    WordsRoundTrip(0, item.leechers, 0);
    assert slot[0..4] == BigEndian(item.seeders, 4);
    assert slot[4..8] == BigEndian(item.downloaded, 4);
    assert slot[8..12] == BigEndian(item.leechers, 4);
  }

  // --------------------------------------------------------- replies, written in place

  /** Two stores, one for the address bytes and one for the port, fill a slot. */
  lemma SlotWritten(b: seq<byte>, at: nat, slot: seq<byte>)
    requires |slot| == PEER_SLOT && at + PEER_SLOT <= |b|
    ensures Overwrite(Overwrite(b, at, slot[..4]), at + 4, slot[4..]) == Overwrite(b, at, slot)
  {
  }

  /** An IPv4 peer is stored into its slot; any other leaves the slot blank. */
  method StorePeer(buffer: array<byte>, at: nat, it: Address)
    requires at + PEER_SLOT <= buffer.Length
    requires buffer[at..at + PEER_SLOT] == Zeroes(PEER_SLOT)
    modifies buffer
    ensures buffer[..] == Overwrite(old(buffer[..]), at, PeerSlot(it))
  {
    if it.family.Inet? {
      assert it.storage[..4] == PeerSlot(it)[..4] && it.storage[4..6] == PeerSlot(it)[4..];
      SlotWritten(buffer[..], at, PeerSlot(it));
      CopyInto(buffer, at, it.storage[..4]);
      CopyInto(buffer, at + 4, it.storage[4..6]);
    } else {
      assert buffer[..] == buffer[..at] + buffer[at..at + PEER_SLOT] + buffer[at + PEER_SLOT..];
    }
  }

  /** Filling the next slot of a partly filled body. */
  lemma NextSlot(done: seq<byte>, room: nat, slot: seq<byte>)
    ensures (done + Zeroes(|slot| + room))[|done|..|done| + |slot|] == Zeroes(|slot|)
    ensures Overwrite(done + Zeroes(|slot| + room), |done|, slot) == done + slot + Zeroes(room)
  {
  }

  lemma PeerSlotsStep(addrs: seq<Address>, i: nat)
    requires i < |addrs|
    ensures Concat(PeerSlots(addrs[..i + 1])) == Concat(PeerSlots(addrs[..i])) + PeerSlot(addrs[i])
    ensures |Concat(PeerSlots(addrs[..i]))| == PEER_SLOT * i
  {
    assert PeerSlots(addrs[..i + 1])[..i] == PeerSlots(addrs[..i]);
    ConcatSize(PeerSlots(addrs[..i]), PEER_SLOT);
  }

  lemma HeadWritten(transaction: Word, interval: uint32, leechers: uint32, seeders: uint32, room: nat)
    ensures var b0 := Overwrite(Zeroes(ANNOUNCE_HEADER + room), 4, transaction);
            var b1 := Overwrite(b0, 0, BigEndian(ANNOUNCE, 4));
            var b2 := Overwrite(b1, 8, BigEndian(interval, 4));
            var b3 := Overwrite(b2, 12, BigEndian(leechers, 4));
            Overwrite(b3, 16, BigEndian(seeders, 4))
            == AnnounceHead(transaction, interval, leechers, seeders) + Zeroes(room)
  {
    var b0 := Overwrite(Zeroes(ANNOUNCE_HEADER + room), 4, transaction);
    var b1 := Overwrite(b0, 0, BigEndian(ANNOUNCE, 4));
    assert b1 == Head(ANNOUNCE, transaction) + Zeroes(12 + room);
    var b2 := Overwrite(b1, 8, BigEndian(interval, 4));
    assert b2 == Head(ANNOUNCE, transaction) + BigEndian(interval, 4) + Zeroes(8 + room);
    var b3 := Overwrite(b2, 12, BigEndian(leechers, 4));
    assert b3 == Head(ANNOUNCE, transaction) + BigEndian(interval, 4) + BigEndian(leechers, 4) + Zeroes(4 + room);
  }

  lemma PeerSlotsEnds(addrs: seq<Address>)
    ensures Concat(PeerSlots(addrs[..0])) == []
    ensures addrs[..|addrs|] == addrs
  {
    assert PeerSlots(addrs[..0]) == [];
  }

  /** The loop over the peers of a reply, behind a header that is already there. */
  method StorePeers(buffer: array<byte>, ghost head: seq<byte>, addrs: seq<Address>)
    requires |head| == ANNOUNCE_HEADER
    requires buffer[..] == head + Zeroes(PEER_SLOT * |addrs|)
    modifies buffer
    ensures buffer[..] == head + Concat(PeerSlots(addrs))
  {
    hide Concat, PeerSlots, Overwrite, PeerSlot;
    PeerSlotsEnds(addrs);
    for i := 0 to |addrs|
      invariant buffer[..] == head + Concat(PeerSlots(addrs[..i])) + Zeroes(PEER_SLOT * (|addrs| - i))
    {
      ghost var done, room := head + Concat(PeerSlots(addrs[..i])), PEER_SLOT * (|addrs| - i - 1);
      PeerSlotsStep(addrs, i);
      NextSlot(done, room, PeerSlot(addrs[i]));
      StorePeer(buffer, ANNOUNCE_HEADER + PEER_SLOT * i, addrs[i]);
      assert done + PeerSlot(addrs[i]) == head + Concat(PeerSlots(addrs[..i + 1]));
    }
  }

  /** The blank buffer, the header and the peers. */
  method BuildAnnounceReply(transaction: Word, interval: uint32, reply: Reply) returns (data: seq<byte>)
    ensures data == AnnounceReply(transaction, interval, reply)
  {
    var buffer := new byte[ANNOUNCE_HEADER + PEER_SLOT * |reply.addrs|](_ => 0);
    StoreHead(buffer, transaction, interval, reply);
    StorePeers(buffer, AnnounceHead(transaction, interval, reply.leechers, reply.seeders), reply.addrs);
    data := buffer[..];
  }

  /** The transaction id at offset 4 and the action at offset 0 of a zeroed buffer. */
  method StoreReplyHead(buffer: array<byte>, action: uint32, transaction: Word)
    requires buffer.Length >= 8 && buffer[..] == Zeroes(buffer.Length)
    modifies buffer
    ensures buffer[..] == Head(action, transaction) + Zeroes(buffer.Length - 8)
  {
    CopyInto(buffer, 4, transaction);
    CopyInto(buffer, 0, BigEndian(action, 4));
  }

  /** The connect reply: the id at offset 8, then the head. */
  method BuildConnectReply(transaction: Word, id: uint64) returns (data: seq<byte>)
    ensures data == ConnectReply(transaction, id)
  {
    var buffer := new byte[CONNECT_REPLY](_ => 0);
    CopyInto(buffer, 8, HostOrder(id, 8));
    CopyInto(buffer, 4, transaction);
    CopyInto(buffer, 0, BigEndian(CONNECT, 4));
    assert buffer[..] == Head(CONNECT, transaction) + HostOrder(id, 8);
    data := buffer[..];
  }

  /** The error reply: the head, then the bytes of the message, and not one more. */
  method BuildErrorReply(transaction: Word, message: string) returns (data: seq<byte>)
    ensures data == ErrorReply(transaction, message)
  {
    var text := Ascii(message);
    var buffer := new byte[ERROR_HEADER + |text|](_ => 0);
    StoreReplyHead(buffer, ERROR, transaction);
    CopyInto(buffer, ERROR_HEADER, text);
    data := buffer[..];
  }

  method StoreHead(buffer: array<byte>, transaction: Word, interval: uint32, reply: Reply)
    requires buffer.Length >= ANNOUNCE_HEADER && buffer[..] == Zeroes(buffer.Length)
    modifies buffer
    ensures buffer[..] == AnnounceHead(transaction, interval, reply.leechers, reply.seeders)
                          + Zeroes(buffer.Length - ANNOUNCE_HEADER)
  {
    HeadWritten(transaction, interval, reply.leechers, reply.seeders, buffer.Length - ANNOUNCE_HEADER);
    CopyInto(buffer, 4, transaction);
    CopyInto(buffer, 0, BigEndian(ANNOUNCE, 4));
    CopyInto(buffer, 8, BigEndian(interval, 4));
    CopyInto(buffer, 12, BigEndian(reply.leechers, 4));
    CopyInto(buffer, 16, BigEndian(reply.seeders, 4));
  }

  lemma ItemSlotsStep(items: seq<ScrapeItem>, i: nat)
    requires i < |items|
    ensures Concat(ItemSlots(items[..i + 1])) == Concat(ItemSlots(items[..i])) + ItemSlot(items[i])
    ensures |Concat(ItemSlots(items[..i]))| == SCRAPE_SLOT * i
  {
    assert ItemSlots(items[..i + 1])[..i] == ItemSlots(items[..i]);
    ConcatSize(ItemSlots(items[..i]), SCRAPE_SLOT);
  }

  lemma ItemWritten(b: seq<byte>, at: nat, item: ScrapeItem)
    requires at + SCRAPE_SLOT <= |b|
    ensures Overwrite(Overwrite(Overwrite(b, at, BigEndian(item.seeders, 4)), at + 8, BigEndian(item.leechers, 4)),
                      at + 4, BigEndian(item.downloaded, 4))
            == Overwrite(b, at, ItemSlot(item))
  {
    hide BigEndian;
  }

  /** Three stores, in the order the server makes them. */
  method StoreItem(buffer: array<byte>, at: nat, item: ScrapeItem)
    requires at + SCRAPE_SLOT <= buffer.Length
    modifies buffer
    ensures buffer[..] == Overwrite(old(buffer[..]), at, ItemSlot(item))
  {
    ItemWritten(buffer[..], at, item);
    CopyInto(buffer, at, BigEndian(item.seeders, 4));
    CopyInto(buffer, at + 8, BigEndian(item.leechers, 4));
    CopyInto(buffer, at + 4, BigEndian(item.downloaded, 4));
  }

  lemma ItemSlotsEnds(items: seq<ScrapeItem>)
    ensures Concat(ItemSlots(items[..0])) == []
    ensures items[..|items|] == items
  {
    assert ItemSlots(items[..0]) == [];
  }

  /** The loop over the items of a reply, behind a header that is already there. */
  method StoreItems(buffer: array<byte>, ghost head: seq<byte>, items: seq<ScrapeItem>)
    requires |head| == SCRAPE_HEADER
    requires buffer[..] == head + Zeroes(SCRAPE_SLOT * |items|)
    modifies buffer
    ensures buffer[..] == head + Concat(ItemSlots(items))
  {
    hide Concat, ItemSlots, Overwrite, ItemSlot;
    ItemSlotsEnds(items);
    for i := 0 to |items|
      invariant buffer[..] == head + Concat(ItemSlots(items[..i])) + Zeroes(SCRAPE_SLOT * (|items| - i))
    {
      ghost var done, room := head + Concat(ItemSlots(items[..i])), SCRAPE_SLOT * (|items| - i - 1);
      ItemSlotsStep(items, i);
      NextSlot(done, room, ItemSlot(items[i]));
      StoreItem(buffer, SCRAPE_HEADER + SCRAPE_SLOT * i, items[i]);
      assert done + ItemSlot(items[i]) == head + Concat(ItemSlots(items[..i + 1]));
    }
  }

  method BuildScrapeReply(transaction: Word, items: seq<ScrapeItem>) returns (data: seq<byte>)
    ensures data == ScrapeReply(transaction, items)
  {
    var buffer := new byte[SCRAPE_HEADER + SCRAPE_SLOT * |items|](_ => 0);
    StoreReplyHead(buffer, SCRAPE, transaction);
    StoreItems(buffer, Head(SCRAPE, transaction), items);
    data := buffer[..];
  }
}
